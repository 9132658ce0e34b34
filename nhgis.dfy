/** The bookkeeping of nhgis_api.py: following the paged shapefile metadata
    listing, enriching each record with its level id and basis id, the
    description of an extract request, and polling an extract until it
    completes. HTTP responses are given to the model as the sequence of
    responses the client would observe. */
module Nhgis {
  import opened Common
  import opened Text

  /** The first index whose element satisfies p, if any. */
  function FirstWhere<T>(s: seq<T>, p: T -> bool): (r: Option<nat>)
    ensures r.Some? ==> r.value < |s| && p(s[r.value])
    ensures r.Some? ==> forall k :: 0 <= k < r.value ==> !p(s[k])
    ensures r.None? ==> forall k :: 0 <= k < |s| ==> !p(s[k])
    decreases |s|
  {
    if |s| == 0 then None
    else if p(s[0]) then Some(0)
    else
      var rest := FirstWhere(s[1..], p);
      assert forall k :: 1 <= k < |s| ==> s[k] == s[1..][k - 1];
      if rest.None? then None else Some(rest.value + 1)
  }

  // ---------------------------------------------------------------------------
  // Paged metadata

  const MetadataUrl: string := "https://api.ipums.org/metadata/nhgis/shapefiles?version=2"

  /** One page of the listing: its data records and links.nextPage. */
  datatype Page<R> = Page(data: seq<R>, nextPage: Option<string>)

  datatype MetadataError =
    | IndexError   // next_url.split("?")[1] on a link without '?'
    | MorePages    // the listing goes on past the responses given to the model

  /** The URL of the next request: the current URL up to its first '?', then
      '?', then the next-page link between its first and second '?'. */
  function NextUrl(url: string, nextUrl: string): (r: Result<string, MetadataError>)
    ensures r.Err? <==> '?' !in nextUrl
    ensures r.Ok? ==> '?' in r.value
  {
    var q := Split(nextUrl, '?');
    SplitLength(nextUrl, '?');
    CountAbsent(nextUrl, '?');
    if |q| < 2 then Err(IndexError) else Ok(Split(url, '?')[0] + "?" + q[1])
  }

  /** The rewrite keeps the base of the current URL and takes the query of the
      next-page link, cut at a second '?' if the link has one (the API's links
      are not trusted to carry the right base). */
  lemma NextUrlRewrite(base: string, rest: string, a: string, query: string, tail: string)
    requires '?' !in base && (rest == [] || rest[0] == '?')
    requires '?' !in a && '?' !in query && (tail == [] || tail[0] == '?')
    ensures NextUrl(base + rest, a + "?" + query + tail) == Ok(base + "?" + query)
  {
    SplitHead(base, rest, '?');
    var link := a + "?" + query + tail;
    assert link == a + ['?'] + (query + tail);
    SplitAfter(a, query + tail, '?');
    SplitHead(query, tail, '?');
  }

  /** A well-formed base URL with a query and a well-formed link with a query
      give the base with the link's query. */
  lemma NextUrlOfWellFormed(base: string, query0: string, a: string, query: string)
    requires '?' !in base && '?' !in query0 && '?' !in a && '?' !in query
    ensures NextUrl(base + "?" + query0, a + "?" + query) == Ok(base + "?" + query)
  {
    NextUrlRewrite(base, "?" + query0, a, query, []);
    assert base + "?" + query0 == base + ("?" + query0);
    assert a + "?" + query + [] == a + "?" + query;
  }

  /** The data of the pages, concatenated in order. */
  function Concat<R>(pages: seq<Page<R>>): (r: seq<R>)
    ensures pages == [] ==> r == []
    decreases |pages|
  {
    if |pages| == 0 then [] else pages[0].data + Concat(pages[1..])
  }

  lemma {:induction false} ConcatAppend<R>(pages: seq<Page<R>>, page: Page<R>)
    ensures Concat(pages + [page]) == Concat(pages) + page.data
    decreases |pages|
  {
    if |pages| == 0 {
      assert [] + [page] == [page];
      assert Concat([page]) == page.data + Concat([page][1..]);
    } else {
      assert (pages + [page])[1..] == pages[1..] + [page];
      ConcatAppend(pages[1..], page);
    }
  }

  /** The page that ends the listing: the first without a next page. */
  function FinalPage<R>(pages: seq<Page<R>>): Option<nat>
  {
    FirstWhere(pages, (p: Page<R>) => p.nextPage.None?)
  }

  /** The pagination loop of get_shapefiles_metadata over the pages it
      receives. Returns the accumulated records and the URL of every request
      made. */
  method FetchAllPages<R>(pages: seq<Page<R>>) returns (records: Result<seq<R>, MetadataError>, urls: seq<string>)
    ensures 1 <= |urls| <= |pages| + 1 && urls[0] == MetadataUrl
    ensures forall k :: 0 <= k < |urls| - 1 ==>
      pages[k].nextPage.Some? && NextUrl(urls[k], pages[k].nextPage.value) == Ok(urls[k + 1])
    ensures records.Ok? <==>
      FinalPage(pages).Some? && forall k :: 0 <= k < FinalPage(pages).value ==> '?' in pages[k].nextPage.value
    ensures records.Ok? ==>
      |urls| == FinalPage(pages).value + 1 && records.value == Concat(pages[..FinalPage(pages).value + 1])
    ensures records == Err(MorePages) ==> |urls| == |pages| + 1
    ensures records == Err(IndexError) ==>
      |urls| <= |pages| && pages[|urls| - 1].nextPage.Some? && '?' !in pages[|urls| - 1].nextPage.value
  {
    var url := MetadataUrl;
    urls := [url];
    var collected: seq<R> := [];
    var i := 0;
    while i < |pages|
      invariant 0 <= i <= |pages|
      invariant |urls| == i + 1 && urls[0] == MetadataUrl && url == urls[i]
      invariant forall k :: 0 <= k < i ==> pages[k].nextPage.Some? && '?' in pages[k].nextPage.value
      invariant forall k :: 0 <= k < i ==> NextUrl(urls[k], pages[k].nextPage.value) == Ok(urls[k + 1])
      invariant collected == Concat(pages[..i])
    {
      var page := pages[i];
      ConcatAppend(pages[..i], page);
      assert pages[..i + 1] == pages[..i] + [page];
      collected := collected + page.data;
      if page.nextPage.None? {
        assert FinalPage(pages) == Some(i);
        return Ok(collected), urls;
      }
      var next := NextUrl(url, page.nextPage.value);
      if next.Err? {
        assert FinalPage(pages).None? || FinalPage(pages).value > i;
        return Err(IndexError), urls;
      }
      url := next.value;
      urls := urls + [url];
      i := i + 1;
    }
    records := Err(MorePages);
  }

  // ---------------------------------------------------------------------------
  // Record enrichment

  /** A shapefile metadata record: its name and geographicLevel as listed, and
      the two fields the client adds. */
  datatype ShapefileRecord = ShapefileRecord(name: string, geographicLevel: string,
                                             geographicLevelId: Option<string>, basisId: Option<string>)

  /** level_map: the NHGIS level names and the ids the client gives them. */
  const LevelMap: map<string, string> :=
    map["Block" := "block", "Block Group" := "blockgroup", "Census Tract" := "tract",
        "Place" := "place", "County" := "county", "State" := "state"]
  const KnownLevels: set<string> := {"Block", "Block Group", "Census Tract", "Place", "County", "State"}
  const LevelIds: set<string> := {"block", "blockgroup", "tract", "place", "county", "state"}

  /** level_map.get(level, level): a listed level becomes its own id from
      level_map, every other level is kept as given. */
  function GeographicLevelId(level: string): (r: string)
    ensures level in LevelMap <==> level in KnownLevels
    ensures level in LevelMap ==> r == LevelMap[level] && r in LevelIds
    ensures level !in KnownLevels ==> r == level
  {
    if level == "Block" then "block"
    else if level == "Block Group" then "blockgroup"
    else if level == "Census Tract" then "tract"
    else if level == "Place" then "place"
    else if level == "County" then "county"
    else if level == "State" then "state"
    else level
  }

  /** The six listed levels map to six distinct ids, and no id is itself a
      listed level, so mapping twice is mapping once. */
  lemma GeographicLevelIdMap(level: string, other: string)
    ensures level in KnownLevels && other in KnownLevels && level != other ==>
      GeographicLevelId(level) != GeographicLevelId(other)
    ensures GeographicLevelId(GeographicLevelId(level)) == GeographicLevelId(level)
  {
    assert forall id :: id in LevelIds ==> id !in KnownLevels;
  }

  /** name.split("_")[-1]: the text after the last '_', or the whole name
      when it has none. */
  function BasisId(name: string): (r: string)
    ensures '_' !in r && EndsWith(name, r)
    ensures '_' !in name ==> r == name
    ensures '_' in name ==> |r| < |name| && name[|name| - |r| - 1] == '_'
  {
    var parts := Split(name, '_');
    SplitPiecesFree(name, '_');
    if '_' in name then
      SplitLast(name, '_');
      parts[|parts| - 1]
    else
      SplitFree(name, '_');
      parts[|parts| - 1]
  }

  /** NHGIS shapefile names end in the basis: with "_" between name and basis,
      the basis comes back. */
  lemma BasisIdOfName(stem: string, basis: string)
    requires '_' !in basis
    ensures BasisId(stem + "_" + basis) == basis
  {
    SplitAppend(stem, basis, '_');
  }

  /** The two fields the loop sets: the level id of the record's level and
      the basis id of its name; name and level are kept. */
  function Enriched(rec: ShapefileRecord): (r: ShapefileRecord)
    ensures r.name == rec.name && r.geographicLevel == rec.geographicLevel
    ensures r.geographicLevelId == Some(GeographicLevelId(rec.geographicLevel))
    ensures r.basisId == Some(BasisId(rec.name))
  {
    rec.(geographicLevelId := Some(GeographicLevelId(rec.geographicLevel)), basisId := Some(BasisId(rec.name)))
  }

  /** Enrichment is a function of name and level only, so a second pass
      changes nothing. */
  lemma EnrichedIdempotent(rec: ShapefileRecord)
    ensures Enriched(Enriched(rec)) == Enriched(rec)
  {
  }

  /** One step of the loop: the record at i is enriched in place. */
  method EnrichAt(records: array<ShapefileRecord>, i: int)
    requires 0 <= i < records.Length
    modifies records
    ensures records[i] == Enriched(old(records[i]))
    ensures forall k :: 0 <= k < records.Length && k != i ==> records[k] == old(records[k])
  {
    records[i] := Enriched(records[i]);
  }

  /** The `for record in records` loop, updating each record in place. */
  method EnrichAll(records: array<ShapefileRecord>)
    modifies records
    ensures forall k :: 0 <= k < records.Length ==> records[k] == Enriched(old(records[k]))
  {
    var i := 0;
    while i < records.Length
      invariant 0 <= i <= records.Length
      invariant forall k :: 0 <= k < i ==> records[k] == Enriched(old(records[k]))
      invariant forall k :: i <= k < records.Length ==> records[k] == old(records[k])
    {
      EnrichAt(records, i);
      i := i + 1;
    }
  }

  /** get_shapefiles_metadata: every record of the listing, in page order,
      enriched. */
  method GetShapefilesMetadata(pages: seq<Page<ShapefileRecord>>) returns (r: Result<seq<ShapefileRecord>, MetadataError>)
    ensures r.Ok? <==>
      FinalPage(pages).Some? && forall k :: 0 <= k < FinalPage(pages).value ==> '?' in pages[k].nextPage.value
    ensures r.Ok? ==> var listed := Concat(pages[..FinalPage(pages).value + 1]);
      |r.value| == |listed| && forall k :: 0 <= k < |listed| ==> r.value[k] == Enriched(listed[k])
  {
    var fetched, _ := FetchAllPages(pages);
    if fetched.Err? {
      return Err(fetched.error);
    }
    var a := new ShapefileRecord[|fetched.value|](k requires 0 <= k < |fetched.value| => fetched.value[k]);
    EnrichAll(a);
    r := Ok(a[..]);
  }

  // ---------------------------------------------------------------------------
  // Extract requests

  /** The description of request_extract: nothing for no names, the one name,
      or the first and the last. */
  function Description(names: seq<string>): (r: string)
    ensures r == "" <==> |names| == 0
    ensures |names| == 1 ==> r == "shapefile " + names[0]
    ensures |names| > 1 ==> r == "shapefiles " + names[0] + " ... " + names[|names| - 1]
    ensures |names| > 1 ==> StartsWith(r, "shapefiles " + names[0] + " ... ")
    ensures |names| >= 1 ==> EndsWith(r, names[|names| - 1])
  {
    var descriptions :=
      if |names| == 1 then ["shapefile " + names[0]]
      else if |names| > 1 then ["shapefiles " + names[0] + " ... " + names[|names| - 1]]
      else [];
    var r := Join(descriptions, "; ");
    assert |names| > 1 ==> r == ("shapefiles " + names[0] + " ... ") + names[|names| - 1];
    r
  }

  /** The body request_extract posts. The datasets and time-series tables
      requested are given by the names they are keyed by (both empty here);
      the three layout options are constant. */
  datatype ExtractRequest = ExtractRequest(datasets: set<string>, timeSeriesTables: set<string>,
                                           shapefiles: seq<string>, timeSeriesTableLayout: string,
                                           dataFormat: string, description: string,
                                           breakdownAndDataTypeLayout: string)

  /** The body for a list of shapefile names: only shapefiles are requested,
      in the order given, under the description of the names. */
  function ExtractBody(names: seq<string>): (body: ExtractRequest)
    ensures body.datasets == {} && body.timeSeriesTables == {}
    ensures body.shapefiles == names
    ensures body.description == Description(names)
    ensures body.timeSeriesTableLayout == "time_by_file_layout"
    ensures body.dataFormat == "csv_header"
    ensures body.breakdownAndDataTypeLayout == "single_file"
  {
    ExtractRequest({}, {}, names, "time_by_file_layout", "csv_header", Description(names), "single_file")
  }

  datatype RequestError = FailedToCreate

  /** request_extract: `post` gives the "number" of the response to a body,
      None when the response has none. */
  function RequestExtract(names: seq<string>, post: ExtractRequest -> Option<int>): (r: Result<int, RequestError>)
    ensures r.Ok? <==> post(ExtractBody(names)).Some?
    ensures r.Ok? ==> r.value == post(ExtractBody(names)).value
  {
    match post(ExtractBody(names))
    case None => Err(FailedToCreate)
    case Some(n) => Ok(n)
  }

  // ---------------------------------------------------------------------------
  // Polling an extract

  /** One poll: the HTTP status code, the extract's "status" and its info. */
  datatype Response<I> = Response(statusCode: int, status: string, info: I)

  datatype PollError =
    | HttpError(code: int)        // raise_for_status
    | ExtractEnded(status: string) // "failed" or "canceled"
    | StillPending                // still waiting after the responses given to the model

  /** raise_for_status raises for client and server errors only. */
  predicate RaisesForStatus(code: int) { 400 <= code < 600 }

  /** A response at which wait_for_extract stops polling. */
  predicate Ends<I>(r: Response<I>)
  {
    RaisesForStatus(r.statusCode) || r.status == "completed" || r.status == "failed" || r.status == "canceled"
  }

  /** What the poll loop does at the response that ends it. */
  function Outcome<I>(r: Response<I>): Result<I, PollError>
    requires Ends(r)
  {
    if RaisesForStatus(r.statusCode) then Err(HttpError(r.statusCode))
    else if r.status == "completed" then Ok(r.info)
    else Err(ExtractEnded(r.status))
  }

  function FirstEnd<I>(responses: seq<Response<I>>): Option<nat>
  {
    FirstWhere(responses, (r: Response<I>) => Ends(r))
  }

  /** wait_for_extract over the responses to its successive polls. Returns
      the result, the number of polls made, and how often the waiting message
      was shown. */
  method WaitForExtract<I>(responses: seq<Response<I>>) returns (r: Result<I, PollError>, polls: nat, messages: nat)
    ensures FirstEnd(responses).Some? ==>
      var m := FirstEnd(responses).value;
      r == Outcome(responses[m]) && polls == m + 1 && messages == (if m > 0 then 1 else 0)
    ensures FirstEnd(responses).None? ==>
      r == Err(StillPending) && polls == |responses| && messages == (if |responses| > 0 then 1 else 0)
    ensures messages <= 1
  {
    var messageShown := false;
    messages := 0;
    var i := 0;
    while i < |responses|
      invariant 0 <= i <= |responses|
      invariant forall k :: 0 <= k < i ==> !Ends(responses[k])
      invariant messages == (if i > 0 then 1 else 0) && messageShown == (i > 0)
    {
      var response := responses[i];
      if RaisesForStatus(response.statusCode) {
        assert FirstEnd(responses) == Some(i);
        return Err(HttpError(response.statusCode)), i + 1, messages;
      }
      if response.status == "completed" {
        assert FirstEnd(responses) == Some(i);
        return Ok(response.info), i + 1, messages;
      } else if response.status == "failed" || response.status == "canceled" {
        assert FirstEnd(responses) == Some(i);
        return Err(ExtractEnded(response.status)), i + 1, messages;
      }
      if !messageShown {
        messages := messages + 1;
        messageShown := true;
      }
      i := i + 1;
    }
    return Err(StillPending), i, messages;
  }

  /** The poll returns the info of the first "completed" response when every
      earlier poll was a successful "still waiting". */
  lemma WaitReturnsFirstCompleted<I>(responses: seq<Response<I>>, j: nat)
    requires j < |responses| && responses[j].status == "completed" && !RaisesForStatus(responses[j].statusCode)
    requires forall k :: 0 <= k < j ==> !Ends(responses[k])
    ensures FirstEnd(responses) == Some(j) && Outcome(responses[j]) == Ok(responses[j].info)
  {
  }
}
