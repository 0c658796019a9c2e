/**
 * The `search` operation: validate the arguments, request the results page,
 * classify it, run the eight extraction passes, and shape the returned value.
 * The HTTP request is a parameter: `fetcher` maps the request URL to what the
 * request produced, already parsed.
 */
module Booklog {
  import opened Options
  import opened Js
  import opened Dom
  import opened Records
  import opened Profile

  const TitleInvalid: string := "The title is invalid"
  const PageInvalid: string := "The page is invalid"
  const NoResultsMessage: string := "No search results found."

  /** What the HTTP request produced: a status and the parsed body, or a rejection. */
  datatype FetchResult = Response(status: int, body: Document) | Failed

  /** The objects `search` resolves to. */
  datatype SearchResponse =
    | Found(page: Number, results: seq<Slot>)   // {success: true, page, results}
    | Empty(pageLabel: string, result: string)  // {success: false, page: "None", result: ...}
  {
    predicate Success() { Found? }
  }

  /** `search` either rejects with an error message or resolves to a value; `None` is `undefined`. */
  datatype Outcome = Raised(message: string) | Resolved(value: Option<SearchResponse>)

  /** The fixed object for a page showing the error banner. */
  const NoResultsResponse: SearchResponse := Empty(Sentinel, NoResultsMessage)

  /**
   * The guards run before any request: `!title || typeof title != "string"`,
   * then `isNaN(page) || page === 0`. None means both pass. Together they
   * admit exactly a non-empty string title and any page but NaN and zero,
   * negative numbers and the infinities included.
   */
  function Validate(title: Value, page: Number): (err: Option<string>)
    ensures err.None? <==> title.Str? && title.s != "" && !page.NaN? && page != Finite(0)
    ensures err == Some(TitleInvalid) <==> !(title.Str? && title.s != "")
    ensures err.Some? ==> err.value == TitleInvalid || err.value == PageInvalid
  {
    if !Truthy(title) || TypeOf(title) != "string" then Some(TitleInvalid)
    else if page.NaN? || page == Finite(0) then Some(PageInvalid)
    else None
  }

  const SearchEndpoint: string := "https://booklog.jp/search?"

  /**
   * The query string of the request, `page=${page}&service_id=1&index=Books&keyword=${title}`:
   * the keyword is inserted unencoded.
   */
  function SearchQuery(page: Number, keyword: string): string
  {
    "page=" + NumberText(page) + "&" + "service_id=1" + "&" + "index=Books" + "&" + "keyword=" + keyword
  }

  function SearchUrl(page: Number, keyword: string): string
  {
    SearchEndpoint + SearchQuery(page, keyword)
  }

  /** The rendered page number holds no `&`. */
  lemma PageParameterHasNoAmpersand(page: Number)
    ensures '&' !in "page=" + NumberText(page)
  {
    var head := "page=" + NumberText(page);
    assert forall i :: 0 <= i < |head| ==> head[i] in "page=-0123456789NaInfinity";
  }

  /** The query splits at `&` into its four parameters, the keyword's own `&`s adding more. */
  lemma QuerySplit(page: Number, keyword: string)
    ensures Split(SearchQuery(page, keyword), '&')
         == ["page=" + NumberText(page), "service_id=1", "index=Books"] + Split("keyword=" + keyword, '&')
  {
    PageParameterHasNoAmpersand(page);
    var head := "page=" + NumberText(page);
    assert SearchQuery(page, keyword) == head + ['&'] + ("service_id=1" + ['&'] + ("index=Books" + ['&'] + ("keyword=" + keyword)));
    SplitThreeThen("page=" + NumberText(page), "service_id=1", "index=Books", "keyword=" + keyword, '&');
  }

  /** The first query parameter after the fixed three is the keyword up to its first `&`. */
  lemma KeywordParameter(keyword: string)
    ensures Split("keyword=" + keyword, '&') == ["keyword=" + Split(keyword, '&')[0]] + Split(keyword, '&')[1..]
    ensures "keyword=" + Split(keyword, '&')[0] == "keyword=" + keyword <==> '&' !in keyword
  {
    SplitAfterPrefix("keyword=", keyword, '&');
    FirstPartIsWhole(keyword, '&');
    var first := Split(keyword, '&')[0];
    if "keyword=" + first == "keyword=" + keyword {
      assert first == ("keyword=" + first)[8..];
      assert keyword == ("keyword=" + keyword)[8..];
    }
  }

  /**
   * Because the keyword is not encoded, every `&` in it starts a further
   * query parameter: a server splitting the query at `&` sees
   * `keyword=` followed only by the keyword's text up to its first `&`.
   */
  lemma KeywordNotEncoded(page: Number, keyword: string)
    ensures Split(SearchQuery(page, keyword), '&')
         == ["page=" + NumberText(page), "service_id=1", "index=Books", "keyword=" + Split(keyword, '&')[0]]
            + Split(keyword, '&')[1..]
    ensures |Split(SearchQuery(page, keyword), '&')| == 4 + Count(keyword, '&')
    ensures Split(SearchQuery(page, keyword), '&')[3] == "keyword=" + keyword <==> '&' !in keyword
  {
    QuerySplit(page, keyword);
    KeywordParameter(keyword);
  }

  /**
   * The reference definition of `search`: errors raised by the guards;
   * `undefined` for a rejected request, a status other than 200, or an
   * exception in the book-id pass; the no-results object for the error
   * banner; otherwise the success object with the merged records.
   */
  function SearchSpec(title: Value, page: Number, fetcher: string -> FetchResult): Outcome
  {
    match Validate(title, page)
    case Some(message) => Raised(message)
    case None =>
      var response := fetcher(SearchUrl(page, title.s));
      if response.Failed? || response.status != 200 then Resolved(None)
      else if ShowsErrorBanner(response.body) then Resolved(Some(NoResultsResponse))
      else if !NoThrow(response.body, BookId) then Resolved(None)
      else Resolved(Some(Found(page, Merged(response.body, title.s, Passes))))
  }

  /**
   * `search(title, page)`: the guards, one request, the banner check, then
   * the eight `.each` passes that build the results array.
   */
  method Search(title: Value, page: Number, fetcher: string -> FetchResult) returns (o: Outcome)
    ensures o == SearchSpec(title, page, fetcher)
  {
    var invalid := Validate(title, page);
    if invalid.Some? {
      return Raised(invalid.value);
    }
    var keyword := title.s;
    var response := fetcher(SearchUrl(page, keyword));
    if response.Failed? || response.status != 200 {
      return Resolved(None);
    }
    var doc := response.body;
    if ShowsErrorBanner(doc) {
      return Resolved(Some(NoResultsResponse));
    }
    var results := ExtractResults(doc, keyword);
    if results.None? {
      return Resolved(None);
    }
    return Resolved(Some(Found(page, results.value)));
  }

  /**
   * The guards decide before any request: `search` raises exactly for an
   * invalid title or page, and then whatever the network would do makes no
   * difference. The title is checked first.
   */
  lemma RaisesBeforeFetch(title: Value, page: Number, fetcher: string -> FetchResult, other: string -> FetchResult)
    ensures SearchSpec(title, page, fetcher).Raised?
        <==> !(title.Str? && title.s != "") || page.NaN? || page == Finite(0)
    ensures SearchSpec(title, page, fetcher).Raised? ==>
              SearchSpec(title, page, fetcher) == SearchSpec(title, page, other)
    ensures SearchSpec(title, page, fetcher) == Raised(TitleInvalid) <==> !(title.Str? && title.s != "")
    ensures SearchSpec(title, page, fetcher) == Raised(PageInvalid)
        <==> title.Str? && title.s != "" && (page.NaN? || page == Finite(0))
  {
  }

  /** A rejected request or a status other than 200 resolves to `undefined`. */
  lemma FailedRequestIsUndefined(title: Value, page: Number, fetcher: string -> FetchResult)
    requires Validate(title, page).None?
    requires fetcher(SearchUrl(page, title.s)).Failed? || fetcher(SearchUrl(page, title.s)).status != 200
    ensures SearchSpec(title, page, fetcher) == Resolved(None)
  {
  }

  /**
   * On a page returned with status 200, `search` resolves to the no-results
   * object, with page "None", exactly when the banner reads the phrase.
   */
  lemma BannerMeansNoResults(title: Value, page: Number, fetcher: string -> FetchResult, doc: Document)
    requires Validate(title, page).None?
    requires fetcher(SearchUrl(page, title.s)) == Response(200, doc)
    ensures SearchSpec(title, page, fetcher) == Resolved(Some(Empty("None", "No search results found.")))
        <==> ShowsErrorBanner(doc)
  {
  }

  /** A book link without an `href` makes `split` throw, and the caught exception yields `undefined`. */
  lemma MissingHrefIsUndefined(title: Value, page: Number, fetcher: string -> FetchResult, doc: Document, j: nat)
    requires Validate(title, page).None?
    requires fetcher(SearchUrl(page, title.s)) == Response(200, doc)
    requires !ShowsErrorBanner(doc)
    requires j < |Matches(doc, BookId)| && "href" !in Matches(doc, BookId)[j].attrs
    ensures SearchSpec(title, page, fetcher) == Resolved(None)
  {
  }

  /**
   * A results page yields the success object with the page argument
   * unchanged and an array without holes, as long as the longest of the
   * eight selections; record i holds field f exactly when f's selector has
   * more than i matches.
   */
  lemma SearchResultShape(title: Value, page: Number, fetcher: string -> FetchResult, doc: Document)
    requires Validate(title, page).None?
    requires fetcher(SearchUrl(page, title.s)) == Response(200, doc)
    requires !ShowsErrorBanner(doc)
    requires NoThrow(doc, BookId)
    ensures SearchSpec(title, page, fetcher).Resolved?
    ensures SearchSpec(title, page, fetcher).value.Some?
    ensures SearchSpec(title, page, fetcher).value.value.Success()
    ensures SearchSpec(title, page, fetcher).value.value.page == page
    ensures var rs := SearchSpec(title, page, fetcher).value.value.results;
            && (forall f :: |Matches(doc, f)| <= |rs|)
            && (exists f :: |Matches(doc, f)| == |rs|)
            && (forall i :: 0 <= i < |rs| ==> rs[i].Some?)
            && (forall i, f :: 0 <= i < |rs| ==> (f in rs[i].value <==> i < |Matches(doc, f)|))
  {
    SearchFindsMerge(title, page, fetcher, doc);
    var rs := Merged(doc, title.s, Passes);
    forall f
      ensures f in Passes
    {
      PassesCoverFields(f);
    }
    forall i, f | 0 <= i < |rs|
      ensures f in rs[i].value <==> i < |Matches(doc, f)|
    {
      MergedRecord(doc, title.s, Passes, i, f);
    }
  }

  /** A results page resolves to the success object holding the merge of all eight passes. */
  lemma SearchFindsMerge(title: Value, page: Number, fetcher: string -> FetchResult, doc: Document)
    requires Validate(title, page).None?
    requires fetcher(SearchUrl(page, title.s)) == Response(200, doc)
    requires !ShowsErrorBanner(doc)
    requires NoThrow(doc, BookId)
    ensures SearchSpec(title, page, fetcher) == Resolved(Some(Found(page, Merged(doc, title.s, Passes))))
  {
  }

  /**
   * The values in record i of a successful search: the book id from the
   * i-th book link's href, the image and Amazon URLs verbatim or "None",
   * the four text fields verbatim, and the title always the query string,
   * whatever the title link says.
   */
  lemma SearchFieldValues(title: Value, page: Number, fetcher: string -> FetchResult, doc: Document, i: nat)
    requires Validate(title, page).None?
    requires fetcher(SearchUrl(page, title.s)) == Response(200, doc)
    requires !ShowsErrorBanner(doc)
    requires NoThrow(doc, BookId)
    requires i < MaxMatches(doc, Passes)
    ensures SearchSpec(title, page, fetcher).Resolved?
    ensures SearchSpec(title, page, fetcher).value.Some?
    ensures SearchSpec(title, page, fetcher).value.value.Found?
    ensures RecordValues(doc, title.s, SearchSpec(title, page, fetcher).value.value.results, i)
  {
    SearchFindsMerge(title, page, fetcher, doc);
    MergedValues(doc, title.s, i);
  }

  /**
   * The merge does not depend on the order of the passes: any ordering of
   * the same fields builds the same array.
   */
  lemma MergeOrderFree(doc: Document, title: string, fs: seq<Field>, gs: seq<Field>)
    requires forall f :: f in fs <==> f in gs
    requires Viable(doc, fs)
    ensures Viable(doc, gs)
    ensures Merged(doc, title, fs) == Merged(doc, title, gs)
  {
    var a := Merged(doc, title, fs);
    var b := Merged(doc, title, gs);
    assert |a| == |b|;
    forall i | 0 <= i < |a|
      ensures a[i] == b[i]
    {
      assert RecordOf(doc, title, fs, i) == RecordOf(doc, title, gs, i);
    }
  }

  /** Running the same passes one after another, in any order, builds the same array. */
  lemma PassOrderFree(doc: Document, title: string, fs: seq<Field>, gs: seq<Field>)
    requires forall f :: f in fs <==> f in gs
    requires Viable(doc, fs)
    ensures Viable(doc, gs)
    ensures RunPasses(doc, title, fs) == RunPasses(doc, title, gs)
  {
    MergeOrderFree(doc, title, fs, gs);
    RunPassesIsMerged(doc, title, fs);
    RunPassesIsMerged(doc, title, gs);
  }
}
